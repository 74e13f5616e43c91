/**
 * The three threads around the one-slot input buffer of an RPC client: callers in `clnt_call`,
 * the receive thread, and the callback thread. A step is what one thread does between two
 * points where another thread may run; a critical section that is not left half-way is one
 * step. Resets and send failures do not happen; every incoming call finds its server.
 */
module ClientThreads {
  import opened Basics

  /** An incoming message: the reply to a call of ours, or a call of the remote side. */
  datatype Msg = Reply(call: nat) | Call(num: nat)

  /** Where the caller that holds `client->lock` is; `Idle` means that nobody holds it. */
  datatype Caller =
    | Idle
    | Encoding     // has client->lock
    | Sending      // also has wait_reply_lock
    | Sent         // the message is out, wait_reply_lock still held
    | Waiting      // asleep on wait_reply
    | Woken        // signalled, wants wait_reply_lock
    | Reading      // has wait_reply_lock, decodes the input buffer
    | Releasing    // done with the buffer, has not marked it free
    | Unlocking

  datatype Receiver =
    | Polling
    | Wanting      // something can be read
    | BufferWait   // asleep on input_xdr_wait
    | BufferWoken
    | Delivering   // has read a message, wants the lock of its addressee

  datatype Callback =
    | NotStarted
    | Starting     // created, wants wait_cb_lock
    | CbWaiting    // asleep on wait_cb
    | CbWoken      // wants wait_cb_lock
    | Top          // has wait_cb_lock, tests got_cb
    | Taken        // got_cb cleared, will copy the message
    | Copied       // has copied it, has not marked the buffer free
    | Dispatching  // in the dispatch function
    | WantsLock    // the function calls `clnt_call` on the same client: wants client->lock
    | Calling      // it has client->lock and is the caller

  /** Who took a message out of the buffer. */
  datatype Taker = ByCaller(call: nat) | ByCallback

  datatype Taking = Taking(who: Taker, msg: Msg)

  datatype State = State(
    caller: Caller,
    rx: Receiver,
    cb: Callback,
    busy: bool,            // input_xdr_busy
    gotCb: bool,           // got_cb
    inMsg: Msg,            // what the buffer holds
    nextCall: nat,         // number of calls sent; the last one is outstanding
    nextIn: nat,           // number of calls the remote side has made
    replied: bool,         // the outstanding call has been replied to
    net: seq<Msg>,         // arrived, not yet read
    // History
    unconsumed: Option<Msg>,
    arrived: seq<Msg>,
    read: seq<Msg>,
    taken: seq<Taking>,
    overwritten: seq<Msg>,
    missedSignals: nat)

  const Init: State :=
    State(Idle, Polling, NotStarted, false, false, Call(0), 0, 0, false, [], None, [], [], [], [], 0)

  predicate ReplyLockFree(s: State) {
    s.caller in {Idle, Encoding, Waiting, Woken}
  }

  predicate CbLockFree(s: State) {
    s.cb in {NotStarted, Starting, CbWaiting, CbWoken}
  }

  datatype Step =
    | CallerLock | CallerGiveUp | CallerLockReply | CallerSend | CallerWait
    | CallerRelock | CallerTake | CallerFreeBuffer | CallerUnlock
    | RemoteReplies | RemoteCalls
    | RxPoll | RxTryRead | RxDeliver | RxSpurious
    | CbLock | CbTest | CbTake | CbFreeBuffer | CbReturn | CbSpurious
    | CbCalls | CbGetsLock

  predicate Enabled(s: State, a: Step) {
    match a
    case CallerLock => s.caller == Idle
    case CallerGiveUp => s.caller == Encoding
    case CallerLockReply => s.caller == Encoding
    case CallerSend => s.caller == Sending
    case CallerWait => s.caller == Sent
    case CallerRelock => s.caller == Woken
    case CallerTake => s.caller == Reading
    case CallerFreeBuffer => s.caller == Releasing
    case CallerUnlock => s.caller == Unlocking
    case RemoteReplies => s.caller in {Sent, Waiting} && !s.replied
    case RemoteCalls => true
    case RxPoll => s.rx == Polling && s.net != []
    case RxTryRead => s.rx == Wanting || s.rx == BufferWoken
    case RxDeliver => s.rx == Delivering && if s.inMsg.Reply? then ReplyLockFree(s) else CbLockFree(s)
    case RxSpurious => s.rx == BufferWait
    case CbLock => s.cb == Starting || s.cb == CbWoken
    case CbTest => s.cb == Top
    case CbTake => s.cb == Taken
    case CbFreeBuffer => s.cb == Copied
    case CbReturn => s.cb == Dispatching
    case CbSpurious => s.cb == CbWaiting
    case CbCalls => s.cb == Dispatching
    case CbGetsLock => s.cb == WantsLock && s.caller == Idle
  }

  /** What nobody has to wait for: a call of the remote side, and waking without cause. */
  lemma NeverBlocked(s: State)
    ensures Enabled(s, RemoteCalls)
    ensures s.caller == Idle ==> Enabled(s, CallerLock)
    ensures s.caller in {Sent, Waiting} && !s.replied ==> Enabled(s, RemoteReplies)
    ensures s.rx == BufferWait ==> Enabled(s, RxSpurious)
    ensures s.cb == CbWaiting ==> Enabled(s, CbSpurious)
    ensures s.cb == Dispatching ==> Enabled(s, CbCalls) && Enabled(s, CbReturn)
  {
  }

  function Arrive(s: State, m: Msg): State {
    s.(net := s.net + [m], arrived := s.arrived + [m])
  }

  /** `input_xdr_busy = 0` and a signal on `input_xdr_wait`. */
  function FreeBuffer(s: State): State {
    s.(busy := false, rx := if s.rx == BufferWait then BufferWoken else s.rx)
  }

  function Take(s: State, who: Taker): State {
    s.(taken := s.taken + [Taking(who, s.inMsg)], unconsumed := None)
  }

  /** With `input_xdr_lock` held: sleep while the buffer is busy, otherwise read into it. */
  function TryRead(s: State): State {
    if s.busy then s.(rx := BufferWait)
    else if s.net == [] then s.(rx := Polling) // nothing to read: the read fails
    else
      s.(rx := Delivering, busy := true, inMsg := s.net[0], net := s.net[1..], read := s.read + [s.net[0]],
         unconsumed := Some(s.net[0]),
         overwritten := if s.unconsumed.Some? then s.overwritten + [s.unconsumed.value] else s.overwritten)
  }

  /** Signal the caller, or flag the call and wake (or create) the callback thread. */
  function Deliver(s: State): State {
    if s.inMsg.Reply? then
      if s.caller == Waiting then s.(rx := Polling, caller := Woken)
      else s.(rx := Polling, missedSignals := s.missedSignals + 1)
    else
      s.(rx := Polling, gotCb := true,
         cb := if s.cb == NotStarted then Starting else if s.cb == CbWaiting then CbWoken else s.cb)
  }

  /** The caller gives `client->lock` back; if it was the callback thread, that goes on dispatching. */
  function Unlock(s: State): State {
    s.(caller := Idle, cb := if s.cb == Calling then Dispatching else s.cb)
  }

  function Do(s: State, a: Step): State
    requires Enabled(s, a)
  {
    match a
    case CallerLock => s.(caller := Encoding)
    case CallerGiveUp => Unlock(s)
    case CallerLockReply => s.(caller := Sending)
    case CallerSend => s.(caller := Sent, nextCall := s.nextCall + 1, replied := false)
    case CallerWait => s.(caller := Waiting)
    case CallerRelock => s.(caller := Reading)
    case CallerTake => Take(s, ByCaller(s.nextCall)).(caller := Releasing)
    case CallerFreeBuffer => FreeBuffer(s).(caller := Unlocking)
    case CallerUnlock => Unlock(s)
    case RemoteReplies => Arrive(s, Reply(s.nextCall)).(replied := true)
    case RemoteCalls => Arrive(s, Call(s.nextIn)).(nextIn := s.nextIn + 1)
    case RxPoll => s.(rx := Wanting)
    case RxTryRead => TryRead(s)
    case RxDeliver => Deliver(s)
    case RxSpurious => s.(rx := BufferWoken)
    case CbLock => s.(cb := Top)
    case CbTest => if s.gotCb then s.(gotCb := false, cb := Taken) else s.(cb := CbWaiting)
    case CbTake => Take(s, ByCallback).(cb := Copied)
    case CbFreeBuffer => FreeBuffer(s).(cb := Dispatching)
    case CbReturn => s.(cb := Top)
    case CbSpurious => s.(cb := CbWoken)
    case CbCalls => s.(cb := WantsLock)
    case CbGetsLock => s.(cb := Calling, caller := Encoding)
  }

  predicate Run(s: State, steps: seq<Step>, s': State)
    decreases |steps|
  {
    if steps == [] then s == s' else Enabled(s, steps[0]) && Run(Do(s, steps[0]), steps[1..], s')
  }

  // ----- The invariant -----

  /** The message in the buffer is on its way to exactly one thread, the right one. */
  predicate BufferInv(s: State) {
    && s.busy == (s.unconsumed.Some? || s.caller == Releasing || s.cb == Copied)
    && (s.unconsumed.Some? ==> s.unconsumed.value == s.inMsg && s.caller != Releasing && s.cb != Copied)
    && !(s.caller == Releasing && s.cb == Copied)
    && (s.rx == Delivering ==> s.unconsumed.Some? && !s.gotCb && s.cb != Taken && s.caller !in {Woken, Reading})
    && (s.caller in {Woken, Reading} ==>
          s.unconsumed == Some(Reply(s.nextCall)) && !s.gotCb && s.cb != Taken)
    && (s.gotCb ==> s.unconsumed.Some? && s.inMsg.Call? && s.cb in {Starting, CbWoken, Top})
    && (s.cb == Taken ==> s.unconsumed.Some? && s.inMsg.Call?)
    && (s.unconsumed.Some? ==>
          s.rx == Delivering || s.caller in {Woken, Reading} || s.gotCb || s.cb == Taken)
    && (s.rx == BufferWait ==> s.busy)
    && (s.cb == Calling ==> s.caller != Idle)
    && s.overwritten == [] && s.missedSignals == 0
  }

  /** A reply on its way belongs to the outstanding call, whose caller has not gone past its wait. */
  predicate ReplyInv(s: State) {
    && (forall i | 0 <= i < |s.net| && s.net[i].Reply? ::
          s.net[i].call == s.nextCall && s.replied && s.caller in {Sent, Waiting} && s.unconsumed != Some(s.net[i]))
    && (forall i, j | 0 <= i < j < |s.net| :: !(s.net[i].Reply? && s.net[j].Reply?))
    && (s.unconsumed.Some? && s.inMsg.Reply? ==>
          && s.inMsg.call == s.nextCall && s.replied
          && s.caller in {Sent, Waiting, Woken, Reading})
    && (s.rx == Delivering && s.inMsg.Reply? ==> s.caller in {Sent, Waiting})
  }

  function Messages(ts: seq<Taking>): (ms: seq<Msg>)
    ensures |ms| == |ts| && forall i | 0 <= i < |ts| :: ms[i] == ts[i].msg
  {
    if ts == [] then [] else Messages(ts[..|ts| - 1]) + [ts[|ts| - 1].msg]
  }

  function Pending(s: State): seq<Msg> {
    if s.unconsumed.Some? then [s.unconsumed.value] else []
  }

  predicate HistoryInv(s: State) {
    && s.arrived == s.read + s.net
    && s.read == Messages(s.taken) + Pending(s)
    && (forall i, j | 0 <= i < j < |s.arrived| :: s.arrived[i] != s.arrived[j])
    && (forall i | 0 <= i < |s.arrived| ::
          match s.arrived[i]
          case Reply(k) => k < s.nextCall || (k == s.nextCall && s.replied)
          case Call(n) => n < s.nextIn)
    && forall i | 0 <= i < |s.taken| :: RightTaker(s.taken[i])
  }

  /** A reply is taken by the caller of that very call, a call by the callback thread. */
  predicate RightTaker(t: Taking) {
    match t.msg
    case Reply(k) => t.who == ByCaller(k)
    case Call(_) => t.who == ByCallback
  }

  predicate Inv(s: State) {
    BufferInv(s) && ReplyInv(s) && HistoryInv(s)
  }

  lemma BufferKept(s: State, a: Step)
    requires Inv(s) && Enabled(s, a)
    ensures BufferInv(Do(s, a))
  {
  }

  lemma RepliesKept(s: State, a: Step)
    requires Inv(s) && Enabled(s, a)
    ensures ReplyInv(Do(s, a))
  {
  }

  lemma HistoryKept(s: State, a: Step)
    requires Inv(s) && Enabled(s, a)
    ensures HistoryInv(Do(s, a))
  {
    match a
    case CallerTake =>
      TakingKeepsHistory(s, ByCaller(s.nextCall));
      QuietStepKeepsHistory(Take(s, ByCaller(s.nextCall)), Do(s, a));
    case CbTake =>
      TakingKeepsHistory(s, ByCallback);
      QuietStepKeepsHistory(Take(s, ByCallback), Do(s, a));
    case RxTryRead => ReadingKeepsHistory(s);
    case RemoteReplies => ArrivingKeepsHistory(s, Reply(s.nextCall), Do(s, a));
    case RemoteCalls => ArrivingKeepsHistory(s, Call(s.nextIn), Do(s, a));
    case _ =>
      QuietSteps(s, a);
      QuietStepKeepsHistory(s, Do(s, a));
  }

  lemma QuietSteps(s: State, a: Step)
    requires Enabled(s, a)
    requires a !in {CallerTake, CbTake, RxTryRead, RemoteReplies, RemoteCalls}
    ensures var t := Do(s, a);
            && t.arrived == s.arrived && t.read == s.read && t.taken == s.taken
            && t.net == s.net && t.unconsumed == s.unconsumed && t.nextIn == s.nextIn
            && (t.nextCall > s.nextCall || (t.nextCall == s.nextCall && t.replied == s.replied))
  {
  }

  /** `t` has the history of `s`, and no fewer calls were made or replied to. */
  lemma QuietStepKeepsHistory(s: State, t: State)
    requires HistoryInv(s)
    requires t.arrived == s.arrived && t.read == s.read && t.taken == s.taken
    requires t.net == s.net && t.unconsumed == s.unconsumed && t.nextIn == s.nextIn
    requires t.nextCall > s.nextCall || (t.nextCall == s.nextCall && t.replied == s.replied)
    ensures HistoryInv(t)
  {
  }

  lemma ReadingKeepsHistory(s: State)
    requires Inv(s)
    ensures HistoryInv(TryRead(s))
  {
    var t := TryRead(s);
    if !s.busy && s.net != [] {
      assert t.read + t.net == s.read + s.net;
    }
  }

  lemma ArrivingKeepsHistory(s: State, m: Msg, t: State)
    requires Inv(s)
    requires m == if m.Reply? then Reply(s.nextCall) else Call(s.nextIn)
    requires m.Reply? ==> !s.replied
    requires t == if m.Reply? then Arrive(s, m).(replied := true) else Arrive(s, m).(nextIn := s.nextIn + 1)
    ensures HistoryInv(t)
  {
    assert t.arrived == t.read + t.net;
    forall i | 0 <= i < |s.arrived| ensures s.arrived[i] != m {
    }
  }

  lemma TakingKeepsHistory(s: State, who: Taker)
    requires Inv(s) && s.unconsumed.Some? && RightTaker(Taking(who, s.inMsg))
    ensures HistoryInv(Take(s, who))
  {
    MessagesOfTaking(s.taken, Taking(who, s.inMsg));
    assert Messages(s.taken) + [s.inMsg] + [] == Messages(s.taken) + [s.inMsg];
  }

  lemma MessagesOfTaking(ts: seq<Taking>, t: Taking)
    ensures Messages(ts + [t]) == Messages(ts) + [t.msg]
  {
    assert (ts + [t])[..|ts|] == ts;
  }

  lemma {:induction false} InvHolds(s: State, steps: seq<Step>, s': State)
    requires Inv(s) && Run(s, steps, s')
    ensures Inv(s')
    decreases |steps|
  {
    if steps != [] {
      BufferKept(s, steps[0]);
      RepliesKept(s, steps[0]);
      HistoryKept(s, steps[0]);
      InvHolds(Do(s, steps[0]), steps[1..], s');
    }
  }

  // ----- The theorems -----

  lemma InvStarts()
    ensures Inv(Init)
  {
  }

  /**
   * One-slot hand-over, in every interleaving of any number of calls, replies and callbacks,
   * including calls made by dispatch functions, with spurious wake-ups of the receive and
   * callback threads: no unconsumed message is overwritten, no reply signal is sent before the
   * caller waits, messages are taken in the order in which they arrived, each at most once and
   * by the thread it is meant for.
   */
  lemma HandOver(steps: seq<Step>, s: State)
    requires Run(Init, steps, s)
    ensures s.overwritten == [] && s.missedSignals == 0
    ensures Messages(s.taken) <= s.arrived
    ensures forall i, j | 0 <= i < j < |s.taken| :: s.taken[i].msg != s.taken[j].msg
    ensures forall i | 0 <= i < |s.taken| :: RightTaker(s.taken[i])
  {
    InvStarts();
    InvHolds(Init, steps, s);
    forall i, j | 0 <= i < j < |s.taken| ensures s.taken[i].msg != s.taken[j].msg {
      assert s.arrived[i] == s.taken[i].msg && s.arrived[j] == s.taken[j].msg;
    }
  }

  // ----- When threads can move -----

  /** What a thread does by itself, once it has set out to make a call or to wait for one. */
  predicate ThreadStep(a: Step) {
    a !in {RemoteReplies, RemoteCalls, CallerLock, CbCalls, RxSpurious, CbSpurious}
  }

  ghost predicate SomeThreadCanMove(s: State) {
    exists a :: ThreadStep(a) && Enabled(s, a)
  }

  /**
   * The callback thread, which holds wait_cb_lock, calls through its own client, or wants to;
   * the caller waits for its reply; and the receive thread, which would have to read that
   * reply, waits for wait_cb_lock to deliver another call.
   */
  predicate Deadlocked(s: State) {
    s.caller == Waiting && s.cb in {WantsLock, Calling} && s.rx == Delivering && s.inMsg.Call?
  }

  /**
   * While a message is unread or not yet consumed, some thread can move on its own, without a
   * new call, a new message or a spurious wake-up, exactly when that deadlock is not there. So
   * no wake-up is ever lost.
   */
  lemma ThreadsCanMoveIff(steps: seq<Step>, s: State)
    requires Run(Init, steps, s)
    requires s.net != [] || s.unconsumed.Some?
    ensures SomeThreadCanMove(s) <==> !Deadlocked(s)
  {
    InvStarts();
    InvHolds(Init, steps, s);
    if Deadlocked(s) {
      NobodyMoves(s);
    } else {
      var a := NextMove(s);
      assert ThreadStep(a) && Enabled(s, a);
    }
  }

  lemma NobodyMoves(s: State)
    requires Deadlocked(s)
    ensures !SomeThreadCanMove(s)
  {
    forall a | ThreadStep(a) ensures !Enabled(s, a) {
    }
  }

  /** A thread that can move, if one can: a caller, else the callback, else the receiver. */
  lemma NextMove(s: State) returns (a: Step)
    requires BufferInv(s) && (s.net != [] || s.unconsumed.Some?) && !Deadlocked(s)
    ensures ThreadStep(a) && Enabled(s, a)
  {
    match s.caller {
      case Encoding => return CallerLockReply;
      case Sending => return CallerSend;
      case Sent => return CallerWait;
      case Woken => return CallerRelock;
      case Reading => return CallerTake;
      case Releasing => return CallerFreeBuffer;
      case Unlocking => return CallerUnlock;
      case Idle =>
        if s.cb == WantsLock {
          return CbGetsLock;
        }
      case Waiting =>
    }
    match s.cb {
      case Starting => return CbLock;
      case CbWoken => return CbLock;
      case Top => return CbTest;
      case Taken => return CbTake;
      case Copied => return CbFreeBuffer;
      case Dispatching => return CbReturn;
      case WantsLock =>
      case Calling =>
      case NotStarted =>
      case CbWaiting =>
    }
    if s.rx == Polling {
      return RxPoll;
    } else if s.rx == Delivering {
      return RxDeliver;
    } else {
      return RxTryRead;
    }
  }

  /** As long as no dispatch function calls through its own client, there is no deadlock. */
  lemma {:induction false} NoDeadlockWithoutNestedCalls(s: State, steps: seq<Step>, s': State)
    requires s.cb !in {WantsLock, Calling} && Run(s, steps, s') && CbCalls !in steps
    ensures !Deadlocked(s') && s'.cb !in {WantsLock, Calling}
    decreases |steps|
  {
    if steps != [] {
      NoDeadlockWithoutNestedCalls(Do(s, steps[0]), steps[1..], s');
    }
  }

  /** The deadlock is for ever: nothing is taken or read any more, whatever arrives. */
  lemma {:induction false} DeadlockLasts(s: State, steps: seq<Step>, s': State)
    requires Deadlocked(s) && Run(s, steps, s')
    ensures Deadlocked(s') && s'.taken == s.taken && s'.read == s.read
    decreases |steps|
  {
    if steps != [] {
      DeadlockLasts(Do(s, steps[0]), steps[1..], s');
    }
  }

  /** A call that arrives while nothing else does is read, with nobody else moving. */
  lemma CallIsRead(s: State) returns (steps: seq<Step>, t: State)
    requires s.rx == Polling && s.net == [] && !s.busy
    ensures Run(s, steps, t)
    ensures t.rx == Delivering && t.inMsg.Call? && t.caller == s.caller && t.cb == s.cb && t.busy && t.net == []
  {
    steps, t := Then(s, [], s, RemoteCalls);
    steps, t := Then(s, steps, t, RxPoll);
    steps, t := Then(s, steps, t, RxTryRead);
  }

  /** A call just read is dispatched. */
  lemma CallIsDispatched(s: State) returns (steps: seq<Step>, t: State)
    requires s.rx == Delivering && s.inMsg.Call? && s.cb == NotStarted
    ensures Run(s, steps, t)
    ensures t.rx == Polling && t.net == s.net && !t.busy && t.cb == Dispatching && t.caller == s.caller
  {
    steps, t := Then(s, [], s, RxDeliver);
    steps, t := Then(s, steps, t, CbLock);
    steps, t := Then(s, steps, t, CbTest);
    steps, t := Then(s, steps, t, CbTake);
    steps, t := Then(s, steps, t, CbFreeBuffer);
  }

  /** A dispatch function makes a call and waits for its reply. */
  lemma DispatchCalls(s: State) returns (steps: seq<Step>, t: State)
    requires s.cb == Dispatching && s.caller == Idle
    ensures Run(s, steps, t)
    ensures t.cb == Calling && t.caller == Waiting
    ensures t.rx == s.rx && t.inMsg == s.inMsg && t.net == s.net && t.busy == s.busy
  {
    steps, t := Then(s, [], s, CbCalls);
    steps, t := Then(s, steps, t, CbGetsLock);
    steps, t := Then(s, steps, t, CallerLockReply);
    steps, t := Then(s, steps, t, CallerSend);
    steps, t := Then(s, steps, t, CallerWait);
  }

  /** A call is being dispatched in some run. */
  lemma DispatchIsReachable()
    ensures exists steps, s :: Run(Init, steps, s) && s.cb == Dispatching
  {
    var steps, s := CallIsRead(Init);
    var more, t := CallIsDispatched(s);
    steps := Joined(Init, steps, s, more, t);
  }

  /**
   * The deadlock is never far: from every reachable state whose callback thread is in a
   * dispatch function some run leads to it, one in which that function makes a call.
   */
  lemma DeadlockIsReachable(before: seq<Step>, s: State)
    requires Run(Init, before, s) && s.cb == Dispatching
    ensures exists steps, t :: Run(s, steps, t) && Deadlocked(t)
  {
    InvStarts();
    InvHolds(Init, before, s);
    var steps, t := DeadlockingRun(s);
  }

  lemma {:induction false} DeadlockingRun(s: State) returns (steps: seq<Step>, t: State)
    requires Inv(s) && s.cb == Dispatching
    ensures Run(s, steps, t) && Deadlocked(t)
    decreases |s.net|, if s.rx == Delivering then 1 else 0
  {
    var more, u;
    steps, t := CallerSettles(s);
    InvHolds(s, steps, t);
    if t.rx != Delivering {
      more, u := NextIsRead(t);
      steps := Joined(s, steps, t, more, u);
      t := u;
      InvHolds(s, steps, t);
    } else if t.inMsg.Reply? {
      steps, t := Then(s, steps, t, RxDeliver);
      InvHolds(s, steps, t);
    }
    if t.rx == Delivering && t.inMsg.Call? {
      more, u := CallWhileDelivering(t);
    } else {
      more, u := DeadlockingRun(t);
    }
    steps := Joined(s, steps, t, more, u);
    t := u;
  }

  /** The caller goes on to where it needs somebody else, or is done. */
  lemma CallerSettles(s: State) returns (steps: seq<Step>, t: State)
    requires Inv(s) && s.cb == Dispatching
    ensures Run(s, steps, t)
    ensures t.caller in {Idle, Waiting} && t.cb == Dispatching && t.net == s.net && t.inMsg == s.inMsg
    ensures t.rx == Delivering <==> s.rx == Delivering
  {
    steps, t := [], s;
    if t.caller == Encoding {
      steps, t := Then(s, steps, t, CallerGiveUp);
    }
    if t.caller == Sending {
      steps, t := Then(s, steps, t, CallerSend);
    }
    if t.caller == Sent {
      steps, t := Then(s, steps, t, CallerWait);
    }
    if t.caller !in {Idle, Waiting} {
      var more, u := CallerReturns(t);
      steps := Joined(s, steps, t, more, u);
      t := u;
    }
  }

  /** A caller that has been signalled takes its message and returns. */
  lemma CallerReturns(s: State) returns (steps: seq<Step>, t: State)
    requires s.caller in {Woken, Reading, Releasing, Unlocking} && s.cb == Dispatching
    ensures Run(s, steps, t)
    ensures t.caller == Idle && t.cb == Dispatching && t.net == s.net && t.inMsg == s.inMsg
    ensures t.rx == Delivering <==> s.rx == Delivering
  {
    steps, t := [], s;
    if t.caller == Woken {
      steps, t := Then(s, steps, t, CallerRelock);
    }
    if t.caller == Reading {
      steps, t := Then(s, steps, t, CallerTake);
    }
    if t.caller == Releasing {
      steps, t := Then(s, steps, t, CallerFreeBuffer);
    }
    steps, t := Then(s, steps, t, CallerUnlock);
  }

  /** The receive thread reads the next message, or a call that arrives if there is none. */
  lemma NextIsRead(s: State) returns (steps: seq<Step>, t: State)
    requires BufferInv(s) && s.rx != Delivering && s.caller in {Idle, Waiting} && s.cb == Dispatching
    ensures Run(s, steps, t)
    ensures t.rx == Delivering && t.caller == s.caller && t.cb == Dispatching
    ensures if s.net == [] then t.inMsg.Call? else |t.net| < |s.net|
  {
    assert !s.busy;
    steps, t := [], s;
    if t.net == [] {
      steps, t := Then(s, steps, t, RemoteCalls);
    }
    if t.rx == Polling {
      steps, t := Then(s, steps, t, RxPoll);
    }
    steps, t := Then(s, steps, t, RxTryRead);
  }

  /** A dispatch function calls while the receive thread waits to deliver one more call. */
  lemma CallWhileDelivering(s: State) returns (steps: seq<Step>, t: State)
    requires s.cb == Dispatching && s.caller in {Idle, Waiting} && s.rx == Delivering && s.inMsg.Call?
    ensures Run(s, steps, t) && Deadlocked(t)
  {
    if s.caller == Idle {
      steps, t := DispatchCalls(s);
    } else {
      steps, t := Then(s, [], s, CbCalls);
    }
  }

  // ----- Calls are answered, one after the other -----

  /** Nobody calls, and nothing is on its way to the receive thread or in its buffer. */
  predicate Quiet(s: State) {
    s.caller == Idle && s.rx == Polling && s.net == [] && !s.busy
  }

  /** A caller sends its call and waits. */
  lemma CallIsMade(s: State) returns (steps: seq<Step>, t: State)
    requires Quiet(s)
    ensures Run(s, steps, t)
    ensures t == s.(caller := Waiting, nextCall := s.nextCall + 1, replied := false)
  {
    steps, t := Then(s, [], s, CallerLock);
    steps, t := Then(s, steps, t, CallerLockReply);
    steps, t := Then(s, steps, t, CallerSend);
    steps, t := Then(s, steps, t, CallerWait);
  }

  /** The reply to the outstanding call arrives, is read, and its caller is signalled. */
  lemma ReplyIsRead(s: State) returns (steps: seq<Step>, t: State)
    requires s.caller == Waiting && !s.replied && s.rx == Polling && s.net == [] && !s.busy
    ensures Run(s, steps, t)
    ensures t.caller == Woken && t.rx == Polling && t.net == [] && t.busy && t.inMsg == Reply(s.nextCall)
    ensures t.cb == s.cb && t.nextCall == s.nextCall && t.taken == s.taken
  {
    steps, t := Then(s, [], s, RemoteReplies);
    steps, t := Then(s, steps, t, RxPoll);
    steps, t := Then(s, steps, t, RxTryRead);
    steps, t := Then(s, steps, t, RxDeliver);
  }

  lemma WokenReturns(s: State) returns (steps: seq<Step>, t: State)
    requires s.caller == Woken && s.rx == Polling && s.cb != Calling
    ensures Run(s, steps, t)
    ensures t.caller == Idle && t.rx == Polling && t.net == s.net && !t.busy && t.cb == s.cb
    ensures t.nextCall == s.nextCall && t.taken == s.taken + [Taking(ByCaller(s.nextCall), s.inMsg)]
  {
    steps, t := WokenTakes(s);
    steps, t := Then(s, steps, t, CallerFreeBuffer);
    steps, t := Then(s, steps, t, CallerUnlock);
  }

  /** Whenever all is quiet, a call can be made, answered and returned from, and all is quiet again. */
  lemma CallIsAnswered(s: State) returns (steps: seq<Step>, t: State)
    requires Quiet(s) && s.cb != Calling
    ensures Run(s, steps, t) && Quiet(t) && t.cb == s.cb && t.nextCall == s.nextCall + 1
    ensures t.taken == s.taken + [Taking(ByCaller(t.nextCall), Reply(t.nextCall))]
  {
    var more, u;
    steps, t := CallIsMade(s);
    more, u := ReplyIsRead(t);
    steps := Joined(s, steps, t, more, u);
    more, t := WokenReturns(u);
    steps := Joined(s, steps, u, more, t);
  }

  /** Some run makes any number of calls, numbered from 1, each of which its own reply answers. */
  lemma {:induction false} AnyNumberOfCalls(n: nat) returns (steps: seq<Step>, s: State)
    ensures Run(Init, steps, s) && Quiet(s) && s.cb == NotStarted && s.nextCall == n
    ensures |s.taken| == n && forall i | 0 <= i < n :: s.taken[i] == Taking(ByCaller(i + 1), Reply(i + 1))
  {
    if n == 0 {
      steps, s := [], Init;
    } else {
      var before, more;
      before, s := AnyNumberOfCalls(n - 1);
      var start := s;
      more, s := CallIsAnswered(start);
      steps := Joined(Init, before, start, more, s);
    }
  }

  lemma {:induction false} Joined(s: State, a: seq<Step>, t: State, b: seq<Step>, u: State) returns (steps: seq<Step>)
    requires Run(s, a, t) && Run(t, b, u)
    ensures Run(s, steps, u)
    decreases |a|
  {
    if a == [] {
      steps := b;
    } else {
      var rest := Joined(Do(s, a[0]), a[1..], t, b, u);
      steps := [a[0]] + rest;
      assert steps[1..] == rest;
    }
  }

  /** A run, one step longer. */
  lemma Then(start: State, steps: seq<Step>, s: State, a: Step) returns (steps': seq<Step>, s': State)
    requires Run(start, steps, s) && Enabled(s, a)
    ensures Run(start, steps', s') && s' == Do(s, a)
  {
    steps', s' := steps + [a], Do(s, a);
    RunThen(start, steps, s, a);
  }

  lemma {:induction false} RunThen(start: State, steps: seq<Step>, s: State, a: Step)
    requires Run(start, steps, s) && Enabled(s, a)
    ensures Run(start, steps + [a], Do(s, a))
    decreases |steps|
  {
    if steps == [] {
      assert [] + [a] == [a] && [a][1..] == [];
    } else {
      RunThen(Do(start, steps[0]), steps[1..], s, a);
      assert (steps + [a])[1..] == steps[1..] + [a];
    }
  }

  // ----- Why the caller must not wake spuriously -----

  /** `pthread_cond_wait` of the caller returns without a signal: there is no loop around it. */
  function SpuriousCallerWake(s: State): State
    requires s.caller == Waiting
  {
    s.(caller := Woken)
  }

  /** A reply in the buffer is of a call made, and until it is signalled the current one is unconsumed. */
  predicate BufferedReplyInv(s: State) {
    && (s.inMsg.Reply? ==> s.inMsg.call <= s.nextCall)
    && (s.inMsg == Reply(s.nextCall) && s.caller in {Sent, Waiting} ==> s.unconsumed.Some?)
  }

  lemma BufferedReplyKept(s: State, a: Step)
    requires Inv(s) && BufferedReplyInv(s) && Enabled(s, a)
    ensures BufferedReplyInv(Do(s, a))
  {
    if a == RxTryRead && s.net != [] {
      assert s.arrived[|s.read|] == s.net[0];
    }
  }

  lemma {:induction false} BufferedReplyHolds(s: State, steps: seq<Step>, s': State)
    requires Inv(s) && BufferedReplyInv(s) && Run(s, steps, s')
    ensures BufferedReplyInv(s')
    decreases |steps|
  {
    if steps != [] {
      var next := Do(s, steps[0]);
      BufferedReplyKept(s, steps[0]);
      assert Run(s, [steps[0]], next) by {
        assert [steps[0]][1..] == [];
      }
      InvHolds(s, [steps[0]], next);
      BufferedReplyHolds(next, steps[1..], s');
    }
  }

  /** A woken caller takes what the buffer holds. */
  lemma WokenTakes(w: State) returns (steps: seq<Step>, t: State)
    requires w.caller == Woken
    ensures Run(w, steps, t) && t == Take(w, ByCaller(w.nextCall)).(caller := Releasing)
  {
    steps, t := Then(w, [], w, CallerRelock);
    steps, t := Then(w, steps, t, CallerTake);
  }

  /** A caller done with the buffer returns, and the next one calls and waits. */
  lemma NextCallWaits(s: State) returns (steps: seq<Step>, t: State)
    requires s.caller == Releasing && s.rx == Delivering
    ensures Run(s, steps, t)
    ensures t.caller == Waiting && t.nextCall == s.nextCall + 1
    ensures t.rx == Delivering && t.inMsg == s.inMsg && t.taken == s.taken
  {
    steps, t := Then(s, [], s, CallerFreeBuffer);
    steps, t := Then(s, steps, t, CallerUnlock);
    steps, t := Then(s, steps, t, CallerLock);
    steps, t := Then(s, steps, t, CallerLockReply);
    steps, t := Then(s, steps, t, CallerSend);
    steps, t := Then(s, steps, t, CallerWait);
  }

  /** A reply taken before its signal came is taken once more by the next caller. */
  lemma NextCallTakesStaleReply(s: State) returns (steps: seq<Step>, t: State)
    requires s.caller == Releasing && s.rx == Delivering && s.inMsg == Reply(s.nextCall)
    ensures Run(s, steps, t)
    ensures t.taken == s.taken + [Taking(ByCaller(s.nextCall + 1), Reply(s.nextCall))]
  {
    steps, t := NextCallWaits(s);
    steps, t := Then(s, steps, t, RxDeliver);
    var s0, more := t, [];
    more, t := WokenTakes(t);
    steps := Joined(s, steps, s0, more, t);
  }

  /**
   * In some run from `s`, somebody takes a message that is not for them: a caller, which then
   * finds another transaction id in it, fails its call, and gives back the buffer all the same.
   */
  ghost predicate CanMisdeliver(s: State) {
    exists steps, t :: Run(s, steps, t) && exists i | 0 <= i < |t.taken| :: !RightTaker(t.taken[i])
  }

  /**
   * The hand-over depends on the caller being woken by a signal only: from a reachable state
   * with a waiting caller no run misdelivers, and if the caller wakes without a signal some
   * run does. If the buffer does not hold the caller's reply, the caller takes what it holds;
   * if it does, the signal still to come makes the next caller take it again.
   */
  lemma SpuriousCallerWakeBreaksHandOver(before: seq<Step>, s: State)
    requires Run(Init, before, s) && s.caller == Waiting
    ensures !CanMisdeliver(s) && CanMisdeliver(SpuriousCallerWake(s))
  {
    InvStarts();
    InvHolds(Init, before, s);
    forall steps, t | Run(s, steps, t) ensures forall i | 0 <= i < |t.taken| :: RightTaker(t.taken[i]) {
      InvHolds(s, steps, t);
    }
    BufferedReplyHolds(Init, before, s);
    var after, t := MisdeliveringRun(s);
    assert !RightTaker(t.taken[|t.taken| - 1]);
  }

  lemma MisdeliveringRun(s: State) returns (after: seq<Step>, t: State)
    requires Inv(s) && BufferedReplyInv(s) && s.caller == Waiting
    ensures Run(SpuriousCallerWake(s), after, t) && t.taken != [] && !RightTaker(t.taken[|t.taken| - 1])
  {
    var w := SpuriousCallerWake(s);
    after, t := WokenTakes(w);
    if s.inMsg == Reply(s.nextCall) {
      var t0, more := t, [];
      more, t := NextCallTakesStaleReply(t);
      after := Joined(w, after, t0, more, t);
    }
  }
}
