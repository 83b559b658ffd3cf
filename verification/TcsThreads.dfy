/**
 * Any number of threads inside the four event ocalls at once. Every run of such a system is, event by event, a run of
 * `TcsEvents`; with two threads that only hand over to each other it is a run of `Handover`.
 */
module TcsThreads {
  import opened TcsEvents
  import opened TcsOcalls
  import opened Wrappers
  import H = Handover

  /** Where a thread is: in no ocall, in the loop over a list, between a set and its wait, or in a wait. */
  datatype Place =
    | Outside
    | Waking(rest: seq<nat>)
    | Between(self: nat, timeout: Option<Timespec>)
    | Waiting(tcs: nat)

  datatype System = System(events: Events, places: map<Thread, Place>)

  const START: System := System(map[], map[])

  function PlaceOf(s: System, t: Thread): Place {
    if t in s.places then s.places[t] else Outside
  }

  /** One step of one thread, up to where it lets go of the mutex of an event. */
  datatype Action =
    | Set(t: Thread, tcs: nat)
    | SetMany(t: Thread, tcss: seq<nat>)
    | WakeNext(t: Thread)
    | Wait(t: Thread, tcs: nat, timeout: Option<Timespec>, elapsed: bool)
    | SetFirst(t: Thread, waiter: nat, self: nat, timeout: Option<Timespec>)
    | ThenWait(t: Thread, elapsed: bool)
    | LeaveQueue(t: Thread)
    | LookAgain(t: Thread, elapsed: bool)

  /** A thread whose wait goes on is in its event's list; otherwise it has returned. */
  function AfterWait(es: Events, t: Thread, tcs: nat): Place {
    if t in EventOf(es, tcs).waiters then Waiting(tcs) else Outside
  }

  ghost predicate Moved(s: System, s': System, t: Thread, p: Place) {
    PlaceOf(s', t) == p && forall u: Thread | u != t :: PlaceOf(s', u) == PlaceOf(s, u)
  }

  /** `u_thread_set_event_ocall`: a null TCS is refused, and then no event changes. */
  ghost predicate SetOnce(before: Events, after: Events, tcs: nat) {
    if tcs == 0 then SameEvents(before, after) else Woken(before, after, tcs)
  }

  ghost predicate Next(s: System, a: Action, s': System) {
    match a
    case Set(t, tcs) =>
      PlaceOf(s, t) == Outside && SetOnce(s.events, s'.events, tcs) && Moved(s, s', t, Outside)
    case SetMany(t, tcss) =>
      PlaceOf(s, t) == Outside && SameEvents(s.events, s'.events)
      && Moved(s, s', t, if tcss == [] then Outside else Waking(tcss))
    case WakeNext(t) =>
      var p := PlaceOf(s, t);
      p.Waking? && p.rest != [] && Woken(s.events, s'.events, p.rest[0])
      && Moved(s, s', t, if |p.rest| == 1 then Outside else Waking(p.rest[1..]))
    case Wait(t, tcs, timeout, elapsed) =>
      PlaceOf(s, t) == Outside && Waited(s.events, s'.events, t, tcs, timeout, elapsed)
      && Moved(s, s', t, if Refused(tcs, timeout) then Outside else AfterWait(s'.events, t, tcs))
    case SetFirst(t, waiter, self, timeout) =>
      PlaceOf(s, t) == Outside && SetOnce(s.events, s'.events, waiter)
      && Moved(s, s', t, if waiter == 0 then Outside else Between(self, timeout))
    case ThenWait(t, elapsed) =>
      var p := PlaceOf(s, t);
      p.Between? && Waited(s.events, s'.events, t, p.self, p.timeout, elapsed)
      && Moved(s, s', t, if Refused(p.self, p.timeout) then Outside else AfterWait(s'.events, t, p.self))
    case LeaveQueue(t) =>
      var p := PlaceOf(s, t);
      p.Waiting? && Stepped(s.events, s'.events, p.tcs, Spurious(t)) && Moved(s, s', t, p)
    case LookAgain(t, elapsed) =>
      var p := PlaceOf(s, t);
      p.Waiting? && Stepped(s.events, s'.events, p.tcs, Recheck(t, elapsed))
      && Moved(s, s', t, AfterWait(s'.events, t, p.tcs))
  }

  ghost predicate IsRun(states: seq<System>, actions: seq<Action>) {
    && |states| == |actions| + 1
    && states[0] == START
    && forall i | 0 <= i < |actions| :: Next(states[i], actions[i], states[i + 1])
  }

  // ---- The ocalls as the methods do them ----

  /** Actions one after another, from any state. */
  ghost predicate IsPath(states: seq<System>, actions: seq<Action>) {
    |states| == |actions| + 1 && forall i | 0 <= i < |actions| :: Next(states[i], actions[i], states[i + 1])
  }

  function Placed(s: System, es: Events, t: Thread, p: Place): System {
    System(es, s.places[t := p])
  }

  lemma PlacedMoves(s: System, es: Events, t: Thread, p: Place)
    ensures Moved(s, Placed(s, es, t, p), t, p)
  {}

  /** The thread that is in the loop over a list can make every wake of it, and then is out of the ocall. */
  lemma {:induction false} LoopRuns(s: System, t: Thread, path: seq<Events>, rest: seq<nat>)
      returns (states: seq<System>, actions: seq<Action>)
    requires WakePath(path, rest) && path[0] == s.events
    requires PlaceOf(s, t) == if rest == [] then Outside else Waking(rest)
    ensures IsPath(states, actions) && states[0] == s && |actions| == |rest|
    ensures states[|rest|].events == path[|rest|] && PlaceOf(states[|rest|], t) == Outside
    ensures forall i | 0 <= i < |actions| :: actions[i] == WakeNext(t)
    decreases |rest|
  {
    if rest == [] {
      states, actions := [s], [];
    } else {
      hide Woken, Moved;
      var p := if |rest| == 1 then Outside else Waking(rest[1..]);
      var s' := Placed(s, path[1], t, p);
      PlacedMoves(s, path[1], t, p);
      assert Woken(path[0], path[1], rest[0]);
      assert Next(s, WakeNext(t), s');
      var later, more := LoopRuns(s', t, path[1..], rest[1..]);
      states, actions := [s] + later, [WakeNext(t)] + more;
    }
  }

  /** `SetMultipleEvents`, as its contract says it changes the events, is a path of the thread that calls it. */
  lemma SetManyRuns(s: System, t: Thread, path: seq<Events>, tcss: seq<nat>)
      returns (states: seq<System>, actions: seq<Action>)
    requires WakePath(path, tcss) && path[0] == s.events && PlaceOf(s, t) == Outside
    ensures IsPath(states, actions) && states[0] == s && |actions| == |tcss| + 1 && actions[0] == SetMany(t, tcss)
    ensures states[|actions|].events == path[|tcss|] && PlaceOf(states[|actions|], t) == Outside
  {
    hide Woken, Moved, WakePath;
    var p := if tcss == [] then Outside else Waking(tcss);
    var s' := Placed(s, s.events, t, p);
    PlacedMoves(s, s.events, t, p);
    assert Next(s, SetMany(t, tcss), s');
    var later, more := LoopRuns(s', t, path, tcss);
    states, actions := [s] + later, [SetMany(t, tcss)] + more;
  }

  /** So is `SetWait`: its wake, and then its wait, in which it is left when it sleeps. */
  lemma SetWaitRuns(s: System, t: Thread, between: Events, after: Events, waiter: nat, self: nat,
                    timeout: Option<Timespec>, elapsed: bool) returns (mid: System, end: System)
    requires waiter != 0 && PlaceOf(s, t) == Outside
    requires Woken(s.events, between, waiter) && Waited(between, after, t, self, timeout, elapsed)
    ensures Next(s, SetFirst(t, waiter, self, timeout), mid) && mid.events == between
    ensures Next(mid, ThenWait(t, elapsed), end) && end.events == after
    ensures PlaceOf(end, t) == Waiting(self) || PlaceOf(end, t) == Outside
  {
    hide Woken, Moved, Waited, Refused;
    mid := Placed(s, between, t, Between(self, timeout));
    PlacedMoves(s, between, t, Between(self, timeout));
    var p := if Refused(self, timeout) then Outside else AfterWait(after, t, self);
    end := Placed(mid, after, t, p);
    PlacedMoves(mid, after, t, p);
  }

  // ---- Event by event ----

  /** What one action does to the event of one TCS: nothing, or one step, of which a start is a wait by its thread. */
  ghost predicate StepOf(before: Events, after: Events, c: nat, s: Step) {
    Enabled(EventOf(before, c), s) && EventOf(after, c) == Apply(EventOf(before, c), s)
  }

  /** An action starts a wait of its thread on the event of c. */
  ghost predicate StartsOn(s: System, a: Action, c: nat) {
    match a
    case Wait(_, tcs, timeout, _) => tcs == c && !Refused(tcs, timeout)
    case ThenWait(t, _) =>
      var p := PlaceOf(s, t);
      p.Between? && p.self == c && !Refused(p.self, p.timeout)
    case _ => false
  }

  /** Seen from one event, an action is nothing, or one step that wakes or is of the thread that acts. */
  lemma ActionOnEvent(s: System, a: Action, s': System, c: nat) returns (step: Option<Step>)
    requires Next(s, a, s')
    ensures step.None? ==> EventOf(s'.events, c) == EventOf(s.events, c)
    ensures step.Some? ==> StepOf(s.events, s'.events, c, step.value)
    ensures step.Some? && step.value.Start? ==> StartsOn(s, a, c)
    ensures step.Some? && !step.value.Wake? ==> step.value.t == a.t
  {
    hide EventOf, Enabled, Apply, Moved, PlaceOf;
    step := None;
    if EventOf(s'.events, c) != EventOf(s.events, c) {
      match a
      case Set(_, tcs) => step := WokenBy(s.events, s'.events, tcs, c);
      case SetMany(_, _) =>
      case WakeNext(t) => step := WokenBy(s.events, s'.events, PlaceOf(s, t).rest[0], c);
      case Wait(t, _, timeout, elapsed) => step := Some(Start(t, timeout.Some?, timeout.Some? && elapsed));
      case SetFirst(_, waiter, _, _) => step := WokenBy(s.events, s'.events, waiter, c);
      case ThenWait(t, elapsed) =>
        var p := PlaceOf(s, t);
        step := Some(Start(t, p.timeout.Some?, p.timeout.Some? && elapsed));
      case LeaveQueue(t) => step := Some(Spurious(t));
      case LookAgain(t, elapsed) => step := Some(Recheck(t, elapsed));
    }
  }

  lemma WokenBy(before: Events, after: Events, tcs: nat, c: nat) returns (step: Option<Step>)
    requires tcs == 0 || Woken(before, after, tcs)
    requires tcs == 0 ==> Woken(before, after, tcs) || SameEvents(before, after)
    requires EventOf(after, c) != EventOf(before, c)
    ensures step.Some? && step.value.Wake? && StepOf(before, after, c, step.value)
  {
    hide EventOf, Enabled, Apply;
    var chosen :| Stepped(before, after, tcs, Step.Wake(chosen));
    step := Some(Step.Wake(chosen));
  }

  /** Never more than n waits are outstanding on the event of c. */
  ghost predicate AtMost(states: seq<System>, actions: seq<Action>, c: nat, n: nat)
    requires |states| == |actions| + 1
  {
    forall i | 0 <= i < |actions| && StartsOn(states[i], actions[i], c) ::
      |EventOf(states[i].events, c).waiters| + 1 <= n
  }

  /** Whatever the threads do, what happens to one event is a run of that event. */
  lemma {:induction false} EventRuns(states: seq<System>, actions: seq<Action>, c: nat, n: nat, i: nat)
      returns (es: seq<Event>, steps: seq<Step>)
    requires IsRun(states, actions) && AtMost(states, actions, c, n) && i < |states|
    ensures TcsEvents.IsRun(es, steps, n) && es[|es| - 1] == EventOf(states[i].events, c)
  {
    hide Next, StartsOn, StepOf;
    if i == 0 {
      es, steps := [IDLE], [];
    } else {
      es, steps := EventRuns(states, actions, c, n, i - 1);
      assert Next(states[i - 1], actions[i - 1], states[i]);
      var step := ActionOnEvent(states[i - 1], actions[i - 1], states[i], c);
      if step.Some? {
        ExtendRun(es, steps, n, states[i - 1].events, states[i].events, c, step.value);
        es, steps := es + [EventOf(states[i].events, c)], steps + [step.value];
      }
    }
  }

  lemma ExtendRun(es: seq<Event>, steps: seq<Step>, n: nat, before: Events, after: Events, c: nat, s: Step)
    requires TcsEvents.IsRun(es, steps, n) && es[|es| - 1] == EventOf(before, c)
    requires StepOf(before, after, c, s) && (s.Start? ==> |EventOf(before, c).waiters| + 1 <= n)
    ensures TcsEvents.IsRun(es + [EventOf(after, c)], steps + [s], n)
  {
    hide EventOf, Apply;
    var longer, all := es + [EventOf(after, c)], steps + [s];
    forall i | 0 <= i < |all|
      ensures Enabled(longer[i], all[i]) && longer[i + 1] == Apply(longer[i], all[i])
      ensures all[i].Start? ==> |longer[i].waiters| + 1 <= n
    {
      if i < |steps| {
        assert longer[i] == es[i] && longer[i + 1] == es[i + 1] && all[i] == steps[i];
      }
    }
  }

  // ---- Threads that wait on their own TCS ----

  /** How the SDK uses the ocalls: a thread waits only on the event of the TCS it runs on. */
  ghost predicate WaitsOnOwn(a: Action, own: Thread -> nat) {
    (a.Wait? ==> a.tcs == own(a.t)) && (a.SetFirst? ==> a.self == own(a.t))
  }

  ghost predicate OwnWaits(actions: seq<Action>, own: Thread -> nat) {
    forall i | 0 <= i < |actions| :: WaitsOnOwn(actions[i], own)
  }

  /** No two threads run on the same TCS. */
  ghost predicate Unshared(own: Thread -> nat) {
    forall t: Thread, u: Thread | own(t) == own(u) :: t == u
  }

  ghost predicate Listed(s: System, t: Thread, c: nat) {
    t in EventOf(s.events, c).waiters
  }

  /** A thread has an outstanding wait on no event but its own, and only while it is in that wait. */
  ghost predicate ThreadInv(s: System, own: Thread -> nat, t: Thread) {
    && (PlaceOf(s, t).Between? ==> PlaceOf(s, t).self == own(t))
    && (PlaceOf(s, t).Waiting? ==> PlaceOf(s, t).tcs == own(t))
    && (forall c: nat | Listed(s, t, c) :: PlaceOf(s, t) == Waiting(c))
  }

  lemma StartThreads(own: Thread -> nat, t: Thread)
    ensures ThreadInv(START, own, t)
  {}

  /** Which waits a step can begin or end. */
  lemma WaitersAfter(e: Event, s: Step, t: Thread)
    requires Enabled(e, s)
    requires s.Wake? || s.Spurious? || s.t != t
    ensures t in Apply(e, s).waiters <==> t in e.waiters
  {}

  /** Only the thread that acts can begin or end a wait of its own. */
  lemma OthersWait(s: System, a: Action, s': System, t: Thread, c: nat)
    requires Next(s, a, s') && t != a.t
    ensures Listed(s', t, c) <==> Listed(s, t, c)
  {
    var step := ActionOnEvent(s, a, s', c);
    hide EventOf, Enabled, Apply, PlaceOf, Next;
    if step.Some? {
      WaitersAfter(EventOf(s.events, c), step.value, t);
    }
  }

  lemma OthersStay(s: System, a: Action, s': System, t: Thread)
    requires Next(s, a, s') && t != a.t
    ensures PlaceOf(s', t) == PlaceOf(s, t)
  {
    hide PlaceOf, EventOf, Enabled, Apply, Woken, SameEvents, Stepped, Waited;
  }

  /** Where the thread that acts is listed afterwards: where it was, unless the action concerns that very event. */
  lemma ActorListed(s: System, a: Action, s': System, c: nat)
    requires Next(s, a, s') && Listed(s', a.t, c)
    ensures Listed(s, a.t, c) || StartsOn(s, a, c)
  {
    var step := ActionOnEvent(s, a, s', c);
    hide EventOf, PlaceOf, Next, StartsOn;
    if step.Some? && !step.value.Start? {
      assert !step.value.Recheck? ==> (a.t in EventOf(s.events, c).waiters);
    }
  }

  /** Where the thread that acts is afterwards, if it is listed anywhere. */
  lemma ActorPlaced(s: System, a: Action, s': System, c: nat)
    requires Next(s, a, s') && Listed(s', a.t, c)
    requires StartsOn(s, a, c) || PlaceOf(s, a.t) == Waiting(c)
    ensures PlaceOf(s', a.t) == Waiting(c)
  {
    hide PlaceOf, EventOf, Enabled, Apply, Woken, SameEvents, Stepped, Waited;
  }

  lemma ActorStays(s: System, a: Action, s': System, own: Thread -> nat)
    requires Next(s, a, s') && ThreadInv(s, own, a.t) && WaitsOnOwn(a, own)
    ensures PlaceOf(s', a.t).Between? ==> PlaceOf(s', a.t).self == own(a.t)
    ensures PlaceOf(s', a.t).Waiting? ==> PlaceOf(s', a.t).tcs == own(a.t)
  {
    hide PlaceOf, EventOf, Enabled, Apply, Woken, SameEvents, Stepped, Waited;
  }

  lemma ActionKeepsThread(s: System, a: Action, s': System, own: Thread -> nat, t: Thread)
    requires Next(s, a, s') && ThreadInv(s, own, t) && WaitsOnOwn(a, own)
    ensures ThreadInv(s', own, t)
  {
    hide PlaceOf, EventOf, Next, Listed, StartsOn, WaitsOnOwn;
    if t == a.t {
      ActorStays(s, a, s', own);
      forall c: nat | Listed(s', t, c)
        ensures PlaceOf(s', t) == Waiting(c)
      {
        ActorListed(s, a, s', c);
        ActorPlaced(s, a, s', c);
      }
    } else {
      OthersStay(s, a, s', t);
      forall c: nat | Listed(s', t, c)
        ensures PlaceOf(s', t) == Waiting(c)
      {
        OthersWait(s, a, s', t, c);
      }
    }
  }

  lemma {:induction false} RunKeepsThread(states: seq<System>, actions: seq<Action>, own: Thread -> nat, t: Thread,
                                          i: nat)
    requires IsRun(states, actions) && OwnWaits(actions, own) && i < |states|
    ensures ThreadInv(states[i], own, t)
  {
    hide Next, ThreadInv, WaitsOnOwn;
    if i == 0 {
      StartThreads(own, t);
    } else {
      RunKeepsThread(states, actions, own, t, i - 1);
      assert Next(states[i - 1], actions[i - 1], states[i]);
      ActionKeepsThread(states[i - 1], actions[i - 1], states[i], own, t);
    }
  }

  /** A wait starts only on the thread's own event, and only when nobody is listed there. */
  lemma StartsAlone(s: System, a: Action, s': System, own: Thread -> nat, c: nat)
    requires Next(s, a, s') && WaitsOnOwn(a, own) && Unshared(own) && StartsOn(s, a, c)
    requires forall t: Thread :: ThreadInv(s, own, t)
    ensures EventOf(s.events, c).waiters == map[]
  {
    StarterIsOwner(s, a, s', own, c);
    hide Next, WaitsOnOwn, StartsOn, PlaceOf, EventOf;
    forall t: Thread
      ensures !Listed(s, t, c)
    {
      assert ThreadInv(s, own, t) && ThreadInv(s, own, a.t);
    }
    var ws := EventOf(s.events, c).waiters;
    assert forall t | t in ws :: Listed(s, t, c);
    assert ws.Keys == {};
  }

  lemma StarterIsOwner(s: System, a: Action, s': System, own: Thread -> nat, c: nat)
    requires Next(s, a, s') && WaitsOnOwn(a, own) && StartsOn(s, a, c) && ThreadInv(s, own, a.t)
    ensures own(a.t) == c && !PlaceOf(s, a.t).Waiting?
  {
    hide PlaceOf, EventOf, Enabled, Apply, Woken, SameEvents, Stepped, Waited, Moved;
  }

  lemma OwnWaitsAlone(states: seq<System>, actions: seq<Action>, own: Thread -> nat, c: nat)
    requires IsRun(states, actions) && OwnWaits(actions, own) && Unshared(own)
    ensures AtMost(states, actions, c, 1)
  {
    hide Next, ThreadInv, WaitsOnOwn, StartsOn, Unshared, EventOf;
    forall i | 0 <= i < |actions| && StartsOn(states[i], actions[i], c)
      ensures |EventOf(states[i].events, c).waiters| + 1 <= 1
    {
      forall t: Thread { RunKeepsThread(states, actions, own, t, i); }
      assert Next(states[i], actions[i], states[i + 1]);
      StartsAlone(states[i], actions[i], states[i + 1], own, c);
    }
  }

  /**
   * However many threads are in the ocalls, as long as each waits on its own TCS: no event ever forgets a sleeper, and
   * every wake is used once, pending, or owed to the one waiter.
   */
  lemma NobodyEverForgotten(states: seq<System>, actions: seq<Action>, own: Thread -> nat, c: nat, i: nat)
    requires IsRun(states, actions) && OwnWaits(actions, own) && Unshared(own) && i < |states|
    ensures TcsEvents.Inv(EventOf(states[i].events, c)) && NobodyForgotten(EventOf(states[i].events, c))
  {
    hide IsRun, OwnWaits, AtMost, TcsEvents.IsRun, EventOf;
    OwnWaitsAlone(states, actions, own, c);
    RunLength(states, actions);
    var es, steps := EventRuns(states, actions, c, 1, i);
    EventRunLength(es, steps);
    TcsEvents.RunKeepsInv(es, steps, |es| - 1);
  }

  lemma RunLength(states: seq<System>, actions: seq<Action>)
    requires IsRun(states, actions)
    ensures |states| == |actions| + 1
  {}

  lemma EventRunLength(es: seq<Event>, steps: seq<Step>)
    requires TcsEvents.IsRun(es, steps, 1)
    ensures |es| == |steps| + 1
  {}

  // ---- Two threads that hand over ----

  /** Threads 0 and 1 run on the TCSs l and r. */
  function OwnOf(l: nat, r: nat): Thread -> nat {
    (t: Thread) => if t == 0 then l else r
  }

  /** The actions of a thread that does nothing but set the other's event and wait on its own. */
  ghost predicate HandsOver(a: Action, l: nat, r: nat) {
    && a.t <= 1
    && match a
       case SetFirst(t, waiter, self, _) => if t == 0 then waiter == r && self == l else waiter == l && self == r
       case ThenWait(_, _) => true
       case LeaveQueue(_) => true
       case LookAgain(_, _) => true
       case _ => false
  }

  function SideOf(t: Thread): H.Side {
    if t == 0 then H.Left else H.Right
  }

  function PlaceIn(p: Place): H.Place {
    match p
    case Between(_, _) => H.SetDone
    case Waiting(_) => H.Place.Waiting
    case _ => H.Place.Outside
  }

  function PairOf(s: System, l: nat, r: nat): H.Pair {
    H.Pair(H.Half(EventOf(s.events, l), PlaceIn(PlaceOf(s, 0))), H.Half(EventOf(s.events, r), PlaceIn(PlaceOf(s, 1))))
  }

  lemma SetIsMove(s: System, a: Action, s': System, l: nat, r: nat) returns (m: H.Move)
    requires Next(s, a, s') && HandsOver(a, l, r) && a.SetFirst? && l != r && l != 0 && r != 0
    ensures H.MoveEnabled(PairOf(s, l, r), m) && PairOf(s', l, r) == H.MoveApply(PairOf(s, l, r), m)
  {
    hide EventOf, Apply, MayNotify, PlaceOf;
    var chosen :| Stepped(s.events, s'.events, a.waiter, Step.Wake(chosen));
    m := H.SetOther(SideOf(a.t), chosen);
  }

  lemma WaitIsMove(s: System, a: Action, s': System, l: nat, r: nat) returns (m: H.Move)
    requires Next(s, a, s') && HandsOver(a, l, r) && a.ThenWait? && l != r && l != 0 && r != 0
    requires PlaceOf(s, a.t).Between? ==> PlaceOf(s, a.t).self == OwnOf(l, r)(a.t)
    ensures H.MoveEnabled(PairOf(s, l, r), m) && PairOf(s', l, r) == H.MoveApply(PairOf(s, l, r), m)
  {
    hide EventOf, Apply, MayNotify, PlaceOf;
    var p := PlaceOf(s, a.t);
    if Refused(p.self, p.timeout) {
      m := H.RefusedWait(SideOf(a.t));
    } else {
      m := H.WaitSelf(SideOf(a.t), p.timeout.Some?, p.timeout.Some? && a.elapsed);
    }
  }

  lemma TurnIsMove(s: System, a: Action, s': System, l: nat, r: nat) returns (m: H.Move)
    requires Next(s, a, s') && HandsOver(a, l, r) && (a.LeaveQueue? || a.LookAgain?) && l != r && l != 0 && r != 0
    requires PlaceOf(s, a.t).Waiting? ==> PlaceOf(s, a.t).tcs == OwnOf(l, r)(a.t)
    ensures H.MoveEnabled(PairOf(s, l, r), m) && PairOf(s', l, r) == H.MoveApply(PairOf(s, l, r), m)
  {
    hide EventOf, Apply, MayNotify, PlaceOf;
    if a.LeaveQueue? {
      StillListed(EventOf(s.events, OwnOf(l, r)(a.t)), a.t);
      m := H.Move.LeaveQueue(SideOf(a.t));
    } else {
      m := H.Move.LookAgain(SideOf(a.t), a.elapsed);
    }
  }

  lemma StillListed(e: Event, t: Thread)
    requires Queued(e, t)
    ensures t in Apply(e, Spurious(t)).waiters
  {}

  lemma ActionIsMove(s: System, a: Action, s': System, l: nat, r: nat) returns (m: H.Move)
    requires Next(s, a, s') && HandsOver(a, l, r) && l != r && l != 0 && r != 0
    requires ThreadInv(s, OwnOf(l, r), a.t)
    ensures H.MoveEnabled(PairOf(s, l, r), m) && PairOf(s', l, r) == H.MoveApply(PairOf(s, l, r), m)
  {
    hide Next, PairOf, H.MoveEnabled, H.MoveApply, OwnOf;
    if a.SetFirst? {
      m := SetIsMove(s, a, s', l, r);
    } else if a.ThenWait? {
      m := WaitIsMove(s, a, s', l, r);
    } else {
      m := TurnIsMove(s, a, s', l, r);
    }
  }

  /** A run in which only threads 0 and 1 act, and each only hands over to the other. */
  ghost predicate OnlyHandsOver(actions: seq<Action>, l: nat, r: nat) {
    l != r && l != 0 && r != 0 && forall i | 0 <= i < |actions| :: HandsOver(actions[i], l, r)
  }

  lemma HandsOverOnOwn(actions: seq<Action>, l: nat, r: nat)
    requires OnlyHandsOver(actions, l, r)
    ensures OwnWaits(actions, OwnOf(l, r))
  {
    forall i | 0 <= i < |actions|
      ensures WaitsOnOwn(actions[i], OwnOf(l, r))
    {
      assert HandsOver(actions[i], l, r);
    }
  }

  /** Such a run is, step by step, a run of the two-thread protocol. */
  lemma {:induction false} HandoverRuns(states: seq<System>, actions: seq<Action>, l: nat, r: nat, i: nat)
      returns (pairs: seq<H.Pair>, moves: seq<H.Move>)
    requires IsRun(states, actions) && OnlyHandsOver(actions, l, r) && i < |states|
    ensures H.IsHandover(pairs, moves) && |pairs| == i + 1 && pairs[i] == PairOf(states[i], l, r)
  {
    if i == 0 {
      pairs, moves := [H.APART], [];
    } else {
      hide Next, PairOf, H.MoveEnabled, H.MoveApply, ThreadInv, HandsOver;
      pairs, moves := HandoverRuns(states, actions, l, r, i - 1);
      HandsOverOnOwn(actions, l, r);
      RunKeepsThread(states, actions, OwnOf(l, r), actions[i - 1].t, i - 1);
      assert Next(states[i - 1], actions[i - 1], states[i]) && HandsOver(actions[i - 1], l, r);
      var m := ActionIsMove(states[i - 1], actions[i - 1], states[i], l, r);
      MoreMoves(pairs, moves, PairOf(states[i], l, r), m);
      pairs, moves := pairs + [PairOf(states[i], l, r)], moves + [m];
    }
  }

  lemma MoreMoves(pairs: seq<H.Pair>, moves: seq<H.Move>, p: H.Pair, m: H.Move)
    requires H.IsHandover(pairs, moves) && H.MoveEnabled(pairs[|moves|], m) && p == H.MoveApply(pairs[|moves|], m)
    ensures H.IsHandover(pairs + [p], moves + [m])
  {
    hide H.MoveApply;
    var longer, all := pairs + [p], moves + [m];
    forall i | 0 <= i < |all|
      ensures H.MoveEnabled(longer[i], all[i]) && longer[i + 1] == H.MoveApply(longer[i], all[i])
    {
      if i < |moves| {
        assert longer[i] == pairs[i] && longer[i + 1] == pairs[i + 1] && all[i] == moves[i];
      }
    }
  }

  /** So two threads that only call `u_thread_setwait_events_ocall` on each other are never both asleep. */
  lemma NeverBothAsleep(states: seq<System>, actions: seq<Action>, l: nat, r: nat, i: nat)
    requires IsRun(states, actions) && OnlyHandsOver(actions, l, r) && i < |states|
    ensures !(Queued(EventOf(states[i].events, l), 0) && Queued(EventOf(states[i].events, r), 1))
  {
    hide IsRun, OnlyHandsOver, Queued, EventOf, H.IsHandover;
    var pairs, moves := HandoverRuns(states, actions, l, r, i);
    H.NeverBothAsleep(pairs, moves, i);
  }
}
