/**
 * The blocking message queue: a mutex, a condition variable and a linked list. What a thread
 * does between taking and giving up the mutex is one step; `MsgQ` has these critical sections
 * as methods over the list, and `Run` interleaves any number of threads doing them.
 */
module MessageQueue {
  import opened LinkedList

  type Tid = nat

  /**
   * How a receiver leaves a critical section: asleep on the condition variable, or returned,
   * with NULL for a message when its result variable is left alone.
   */
  datatype Pass = Sleeps | Returns(rv: Error, data: Pointer)

  // ----- One critical section, as a function of the list and the `unblocked` flag -----

  datatype Core = Core(queue: seq<Item>, unblocked: bool)

  function SndCore(c: Core, data: Pointer, dealloc: bool, memory: bool): (r: (Error, Core)) {
    if data == NULL then (InvalidParameter, c)
    else if c.unblocked then (UnavailableResource, c)
    else if !memory then (FailureGeneral, c)
    else (Success, c.(queue := [Item(data, dealloc)] + c.queue))
  }

  /** `entering` is the first pass of a call, which looks at `unblocked` before anything else. */
  function RcvCore(c: Core, entering: bool): (r: (Pass, Core)) {
    if entering && c.unblocked then (Returns(UnavailableResource, NULL), c)
    else if c.queue == [] && !c.unblocked then (Sleeps, c)
    else if c.queue == [] then (Returns(UnavailableResource, NULL), c)
    else
      var last := |c.queue| - 1;
      (Returns(Success, c.queue[last].data), c.(queue := c.queue[..last]))
  }

  class MsgQ {
    const list: List
    var unblocked: bool

    constructor ()
      ensures fresh(list) && list.nodes == [] && Valid() && View() == Core([], false)
    {
      list := new List();
      unblocked := false;
    }

    ghost predicate Valid()
      reads this, list, list.nodes
    {
      list.Valid()
    }

    ghost function View(): Core
      reads this, list
    {
      Core(list.Contents(), unblocked)
    }

    /** The critical section of `msg_q_snd`; `signal` says whether the condition is signalled. */
    method Snd(data: Pointer, dealloc: bool, memory: bool) returns (rv: Error, signal: bool)
      requires Valid()
      modifies list, list.nodes
      ensures Valid() && (rv, View()) == SndCore(old(View()), data, dealloc, memory)
      ensures rv == Success <==> data != 0 && !unblocked && memory
      ensures data == 0 ==> rv == InvalidParameter
      ensures data != 0 && unblocked ==> rv == UnavailableResource
      ensures list.Contents() == (if rv == Success then [Item(data, dealloc)] else []) + old(list.Contents())
      ensures signal == (data != NULL && !old(unblocked))
    {
      if data == NULL {
        return InvalidParameter, false;
      }
      if unblocked {
        return UnavailableResource, false;
      }
      rv := Add(list, data, dealloc, memory);
      return rv, true;
    }

    /** One pass of `msg_q_rcv` under the mutex, up to a wait or to the return. */
    method Rcv(entering: bool) returns (pass: Pass)
      requires Valid()
      modifies list, list.nodes
      ensures Valid() && (pass, View()) == RcvCore(old(View()), entering)
      ensures pass.Sleeps? <==> old(list.Contents()) == [] && !unblocked
      ensures pass.Returns? ==>
                (pass.rv == Success <==> old(list.Contents()) != [] && !(entering && unblocked))
      ensures if pass.Returns? && pass.rv == Success then
                var last := |old(list.Contents())| - 1;
                pass.data == old(list.Contents())[last].data && list.Contents() == old(list.Contents())[..last]
              else
                list.Contents() == old(list.Contents()) && (pass.Returns? ==> pass.rv == UnavailableResource)
    {
      if entering && unblocked {
        return Returns(UnavailableResource, NULL);
      }
      var empty := Empty(list);
      if empty && !unblocked {
        return Sleeps;
      }
      var rv, data := Remove(list, true, NULL);
      return Returns(rv, data);
    }

    method FlushQueue() returns (rv: Error, calls: seq<Pointer>)
      requires Valid()
      modifies list
      ensures Valid() && rv == Success && View() == Core([], unblocked)
      ensures calls == Deallocs(old(list.Contents()))
    {
      rv, calls := Flush(list);
    }

    /** `broadcast` says whether all waiters are woken. */
    method Unblock() returns (rv: Error, broadcast: bool)
      requires Valid()
      modifies this
      ensures Valid() && View() == old(View()).(unblocked := true)
      ensures broadcast == !old(unblocked) && rv == if broadcast then Success else UnavailableResource
    {
      if unblocked {
        return UnavailableResource, false;
      }
      unblocked := true;
      return Success, true;
    }
  }

  // ----- Interleavings -----

  datatype Fate = Received(receiver: Tid) | Flushed

  datatype Departure = Departure(item: Item, fate: Fate)

  /** What a receive put into its caller's result variable. */
  datatype Handed = Handed(receiver: Tid, data: Pointer)

  datatype State = State(
    core: Core,
    asleep: set<Tid>,   // waiting on the condition variable
    woken: set<Tid>,    // signalled, have not run yet
    // History, newest first like the list itself
    sent: seq<Item>,      // successful sends
    left: seq<Departure>, // what has left the queue, in the order of sending
    freed: seq<Pointer>,  // dealloc calls, the latest flush in front
    handed: seq<Handed>)  // what successful receives returned

  const Init: State := State(Core([], false), {}, {}, [], [], [], [])

  datatype Step =
    | Send(data: Pointer, dealloc: bool, memory: bool, wake: set<Tid>)
    | Enter(t: Tid)     // a receiver arrives
    | Resume(t: Tid)    // a woken receiver runs
    | Spurious(t: Tid)
    | FlushStep
    | UnblockStep

  function AllFlushed(items: seq<Item>): (ds: seq<Departure>)
    ensures |ds| == |items| && forall i | 0 <= i < |items| :: ds[i] == Departure(items[i], Flushed)
  {
    seq(|items|, i requires 0 <= i < |items| => Departure(items[i], Flushed))
  }

  predicate Enabled(s: State, a: Step) {
    match a
    // a signal wakes at least one of the threads that are asleep
    case Send(data, _, _, wake) =>
      wake <= s.asleep && (if data != NULL && !s.core.unblocked then s.asleep != {} ==> wake != {} else wake == {})
    case Enter(t) => t !in s.asleep + s.woken
    case Resume(t) => t in s.woken
    case Spurious(t) => t in s.asleep
    case FlushStep => true
    case UnblockStep => true
  }

  function Receive(s: State, t: Tid, entering: bool): State {
    var (pass, c) := RcvCore(s.core, entering);
    match pass
    case Sleeps => s.(asleep := s.asleep + {t})
    case Returns(rv, data) =>
      if rv != Success then s
      else
        s.(core := c, left := [Departure(s.core.queue[|s.core.queue| - 1], Received(t))] + s.left,
           handed := [Handed(t, data)] + s.handed)
  }

  function Do(s: State, a: Step): State
    requires Enabled(s, a)
  {
    match a
    case Send(data, dealloc, memory, wake) =>
      var (rv, c) := SndCore(s.core, data, dealloc, memory);
      s.(core := c, asleep := s.asleep - wake, woken := s.woken + wake,
         sent := if rv == Success then [Item(data, dealloc)] + s.sent else s.sent)
    case Enter(t) => Receive(s, t, true)
    case Resume(t) => Receive(s.(woken := s.woken - {t}), t, false)
    case Spurious(t) => s.(asleep := s.asleep - {t}, woken := s.woken + {t})
    case FlushStep =>
      s.(core := s.core.(queue := []), left := AllFlushed(s.core.queue) + s.left,
         freed := Deallocs(s.core.queue) + s.freed)
    case UnblockStep =>
      if s.core.unblocked then s
      else s.(core := s.core.(unblocked := true), asleep := {}, woken := s.woken + s.asleep)
  }

  predicate Run(s: State, steps: seq<Step>, s': State)
    decreases |steps|
  {
    if steps == [] then s == s' else Enabled(s, steps[0]) && Run(Do(s, steps[0]), steps[1..], s')
  }

  // ----- No lost wake-up -----

  predicate WakeInv(s: State) {
    && s.asleep !! s.woken
    && (s.asleep != {} ==> |s.core.queue| <= |s.woken|)
    && (s.core.unblocked ==> s.asleep == {})
  }

  lemma WakeKept(s: State, a: Step)
    requires WakeInv(s) && Enabled(s, a)
    ensures WakeInv(Do(s, a))
  {
    match a
    case Send(data, _, memory, wake) =>
      assert |s.woken + wake| == |s.woken| + |wake|;
      if wake != {} {
        assert |wake| >= 1;
      }
    case Resume(t) => assert |s.woken - {t}| == |s.woken| - 1;
    case Spurious(t) => assert |s.woken + {t}| == |s.woken| + 1;
    case _ =>
  }

  /** Threads arrive, go on and wake without cause whenever they please, and whoever asks may send. */
  lemma WhatCanHappen(s: State, t: Tid, data: Pointer, dealloc: bool, memory: bool)
    ensures Enabled(s, FlushStep) && Enabled(s, UnblockStep)
    ensures Enabled(s, Enter(t)) <==> !Present(s, t)
    ensures Enabled(s, Resume(t)) <==> t in s.woken
    ensures Enabled(s, Spurious(t)) <==> t in s.asleep
    ensures exists wake :: Enabled(s, Send(data, dealloc, memory, wake))
    ensures t in s.asleep && data != 0 && !s.core.unblocked ==> Enabled(s, Send(data, dealloc, memory, {t}))
  {
    var signal := data != 0 && !s.core.unblocked;
    assert Enabled(s, Send(data, dealloc, memory, if signal then s.asleep else {}));
  }

  predicate Present(s: State, t: Tid) { t in s.asleep || t in s.woken }

  /** No step forgets a thread: only an arrival that must wait joins, only a return leaves. */
  lemma ThreadsKept(s: State, a: Step, u: Tid)
    requires WakeInv(s) && Enabled(s, a)
    ensures var mustWait := s.core.queue == [] && !s.core.unblocked;
            Present(Do(s, a), u) <==>
              match a
              case Enter(t) => Present(s, u) || (u == t && mustWait)
              case Resume(t) => Present(s, u) && (u != t || mustWait)
              case _ => Present(s, u)
  {
  }

  /** Whom a signal and a broadcast wake, and what closes the queue. */
  lemma WhoIsWoken(s: State, a: Step)
    requires WakeInv(s) && Enabled(s, a)
    ensures a.Send? ==> Do(s, a).woken == s.woken + a.wake && Do(s, a).asleep == s.asleep - a.wake
    ensures a.Send? && Do(s, a).sent != s.sent && s.asleep != {} ==> a.wake != {}
    ensures a.UnblockStep? ==> Do(s, a).asleep == {} && s.asleep <= Do(s, a).woken
    ensures Do(s, a).core.unblocked <==> s.core.unblocked || a.UnblockStep?
  {
  }

  // ----- Conservation -----

  function ItemsOf(ds: seq<Departure>): (items: seq<Item>)
    ensures |items| == |ds|
  {
    if ds == [] then [] else [ds[0].item] + ItemsOf(ds[1..])
  }

  /** The data of the flushed messages that have a dealloc function. */
  function Owed(ds: seq<Departure>): seq<Pointer> {
    if ds == [] then []
    else if ds[0].fate == Flushed && ds[0].item.dealloc then [ds[0].item.data] + Owed(ds[1..])
    else Owed(ds[1..])
  }

  /** The data of the received messages, with their receivers. */
  function Due(ds: seq<Departure>): seq<Handed> {
    if ds == [] then []
    else
      match ds[0].fate
      case Received(t) => [Handed(t, ds[0].item.data)] + Due(ds[1..])
      case Flushed => Due(ds[1..])
  }

  predicate FlowInv(s: State) {
    && s.sent == s.core.queue + ItemsOf(s.left)
    && s.freed == Owed(s.left)
    && s.handed == Due(s.left)
  }

  lemma {:induction false} FlushedItems(q: seq<Item>, ds: seq<Departure>)
    ensures ItemsOf(AllFlushed(q) + ds) == q + ItemsOf(ds)
  {
    var gone := AllFlushed(q);
    if q == [] {
      assert gone + ds == ds;
    } else {
      FlushedItems(q[1..], ds);
      assert (gone + ds)[1..] == AllFlushed(q[1..]) + ds;
      assert ItemsOf(gone + ds) == [q[0]] + (q[1..] + ItemsOf(ds));
      assert q == [q[0]] + q[1..];
    }
  }

  lemma {:induction false} FlushedDeallocs(q: seq<Item>, ds: seq<Departure>)
    ensures Owed(AllFlushed(q) + ds) == Deallocs(q) + Owed(ds)
  {
    var gone := AllFlushed(q);
    if q == [] {
      assert gone + ds == ds;
    } else {
      var first := if q[0].dealloc then [q[0].data] else [];
      FlushedDeallocs(q[1..], ds);
      assert (gone + ds)[1..] == AllFlushed(q[1..]) + ds;
      assert Owed(gone + ds) == first + (Deallocs(q[1..]) + Owed(ds));
      assert Deallocs(q) == first + Deallocs(q[1..]);
    }
  }

  lemma {:induction false} FlushedAreNotHanded(q: seq<Item>, ds: seq<Departure>)
    ensures Due(AllFlushed(q) + ds) == Due(ds)
  {
    var gone := AllFlushed(q);
    if q == [] {
      assert gone + ds == ds;
    } else {
      FlushedAreNotHanded(q[1..], ds);
      assert (gone + ds)[1..] == AllFlushed(q[1..]) + ds;
    }
  }

  lemma FlowKept(s: State, a: Step)
    requires FlowInv(s) && Enabled(s, a)
    ensures FlowInv(Do(s, a))
  {
    match a
    case Send(data, dealloc, _, _) =>
      assert [Item(data, dealloc)] + s.sent == [Item(data, dealloc)] + s.core.queue + ItemsOf(s.left);
    case Enter(t) => ReceiveKeepsFlow(s, t, true);
    case Resume(t) => ReceiveKeepsFlow(s.(woken := s.woken - {t}), t, false);
    case FlushStep => FlushKeepsFlow(s);
    case _ =>
  }

  lemma FlushKeepsFlow(s: State)
    requires FlowInv(s)
    ensures FlowInv(Do(s, FlushStep))
  {
    FlushedItems(s.core.queue, s.left);
    FlushedDeallocs(s.core.queue, s.left);
    FlushedAreNotHanded(s.core.queue, s.left);
  }

  lemma ReceiveKeepsFlow(s: State, t: Tid, entering: bool)
    requires FlowInv(s)
    ensures FlowInv(Receive(s, t, entering))
  {
    var q := s.core.queue;
    if q != [] {
      var d := Departure(q[|q| - 1], Received(t));
      assert ([d] + s.left)[1..] == s.left;
      assert q[..|q| - 1] + ([d.item] + ItemsOf(s.left)) == q + ItemsOf(s.left);
    }
  }

  // ----- The theorems -----

  lemma {:induction false} InvariantsHold(s: State, steps: seq<Step>, s': State)
    requires WakeInv(s) && FlowInv(s) && Run(s, steps, s')
    ensures WakeInv(s') && FlowInv(s')
    decreases |steps|
  {
    if steps != [] {
      WakeKept(s, steps[0]);
      FlowKept(s, steps[0]);
      InvariantsHold(Do(s, steps[0]), steps[1..], s');
    }
  }

  /**
   * No lost wake-up, in every interleaving with spurious wake-ups, flushes and late-arriving
   * receivers: while a receiver is asleep, every queued message has a woken receiver of its own
   * still to run, and once the queue is unblocked nobody is asleep.
   */
  lemma NoLostWakeUp(steps: seq<Step>, s: State)
    requires Run(Init, steps, s)
    ensures s.asleep != {} ==> |s.core.queue| <= |s.woken|
    ensures s.asleep != {} && s.core.queue != [] ==> s.woken != {}
    ensures s.core.unblocked ==> s.asleep == {}
  {
    InvariantsHold(Init, steps, s);
  }

  /**
   * Conservation and order, over every run: the messages still queued and those that left, in
   * the order in which they were sent, are exactly the messages sent, none twice; so receives
   * follow send order. What receivers were handed is the data of the received messages, each to
   * its own receiver; the dealloc functions called are those of the flushed messages, once each.
   */
  lemma SentIsLeftOrQueued(steps: seq<Step>, s: State)
    requires Run(Init, steps, s)
    ensures s.sent == s.core.queue + ItemsOf(s.left)
    ensures s.handed == Due(s.left)
    ensures s.freed == Owed(s.left)
  {
    InvariantsHold(Init, steps, s);
  }

  /** After `msg_q_unblock` no send succeeds, nobody is ever asleep again, and it stays so. */
  lemma {:induction false} UnblockedIsFinal(s: State, steps: seq<Step>, s': State)
    requires WakeInv(s) && s.core.unblocked && Run(s, steps, s')
    ensures s'.core.unblocked && s'.sent == s.sent && s'.asleep == {}
    ensures |s'.core.queue| <= |s.core.queue|
    decreases |steps|
  {
    if steps != [] {
      WakeKept(s, steps[0]);
      UnblockedIsFinal(Do(s, steps[0]), steps[1..], s');
    }
  }
}
