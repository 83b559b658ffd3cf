/** The event of one thread control structure, step by step at the grain of its mutex. */
module TcsEvents {
  import opened Wrappers

  type Thread = nat

  /**
   * A thread inside `wait` or `wait_timeout`: in the condition variable's queue, or out of it (notified, woken
   * spuriously or timed out) and about to retake the mutex.
   */
  datatype Waiter = Waiter(timed: bool, queued: bool)

  /** The guarded counter, the outstanding waits, and what has happened so far. */
  datatype Event = Event(counter: int, waiters: map<Thread, Waiter>,
                         starts: nat, wakes: nat, granted: nat, expired: nat)

  const IDLE: Event := Event(0, map[], 0, 0, 0, 0)

  datatype Step =
    | Start(t: Thread, timed: bool, elapsed: bool)
    | Recheck(t: Thread, elapsed: bool)
    | Spurious(t: Thread)
    | Wake(chosen: Option<Thread>)

  predicate Queued(e: Event, t: Thread) {
    t in e.waiters && e.waiters[t].queued
  }

  /** `notify_one` is called at counter 0 only; it takes some queued thread if there is one. */
  ghost predicate MayNotify(e: Event, chosen: Option<Thread>) {
    if e.counter + 1 != 0 then chosen.None?
    else if chosen.Some? then Queued(e, chosen.value)
    else forall t :: !Queued(e, t)
  }

  ghost predicate Enabled(e: Event, s: Step) {
    match s
    case Start(t, _, _) => t !in e.waiters
    case Recheck(t, _) => t in e.waiters && !e.waiters[t].queued
    case Spurious(t) => Queued(e, t)
    case Wake(chosen) => MayNotify(e, chosen)
  }

  /** The loop test with the mutex held: return 0, give up, or go (back) to sleep. */
  function Settle(e: Event, t: Thread, timed: bool, elapsed: bool): Event {
    if e.counter >= 0 then e.(waiters := e.waiters - {t}, granted := e.granted + 1)
    else if timed && elapsed then e.(counter := 0, waiters := e.waiters - {t}, expired := e.expired + 1)
    else e.(waiters := e.waiters[t := Waiter(timed, true)])
  }

  function Apply(e: Event, s: Step): Event
    requires s.Recheck? || s.Spurious? ==> s.t in e.waiters
  {
    match s
    case Start(t, timed, elapsed) =>
      Settle(e.(counter := e.counter - 1, starts := e.starts + 1), t, timed, elapsed)
    case Recheck(t, elapsed) =>
      Settle(e, t, e.waiters[t].timed, elapsed)
    case Spurious(t) =>
      e.(waiters := e.waiters[t := e.waiters[t].(queued := false)])
    case Wake(chosen) =>
      var ws := if chosen.Some? && chosen.value in e.waiters
                then e.waiters[chosen.value := e.waiters[chosen.value].(queued := false)] else e.waiters;
      e.(counter := e.counter + 1, wakes := e.wakes + 1, waiters := ws)
  }

  // ---- Many events ----

  /** Events by TCS; one that has not been asked for yet is idle. */
  type Events = map<nat, Event>

  function EventOf(es: Events, tcs: nat): Event {
    if tcs in es then es[tcs] else IDLE
  }

  ghost predicate SameEvents(before: Events, after: Events) {
    forall t: nat :: EventOf(after, t) == EventOf(before, t)
  }

  /** The event of one TCS has taken one step, and no other event has changed. */
  ghost predicate Stepped(before: Events, after: Events, tcs: nat, s: Step) {
    && Enabled(EventOf(before, tcs), s)
    && EventOf(after, tcs) == Apply(EventOf(before, tcs), s)
    && forall t: nat | t != tcs :: EventOf(after, t) == EventOf(before, t)
  }

  ghost predicate Woken(before: Events, after: Events, tcs: nat) {
    exists chosen :: Stepped(before, after, tcs, Wake(chosen))
  }

  // ---- Runs of one event ----

  /** A run from the idle event in which never more than n waits are outstanding. */
  ghost predicate IsRun(states: seq<Event>, steps: seq<Step>, n: nat) {
    && |states| == |steps| + 1
    && states[0] == IDLE
    && (forall i | 0 <= i < |steps| :: Enabled(states[i], steps[i]) && states[i + 1] == Apply(states[i], steps[i]))
    && (forall i | 0 <= i < |steps| && steps[i].Start? :: |states[i].waiters| + 1 <= n)
  }

  /** No thread sleeps in the queue while the counter says it may go. */
  ghost predicate NobodyForgotten(e: Event) {
    forall t | Queued(e, t) :: e.counter < 0
  }

  /** With one waiter at most: the counter is the wakes not yet used, and no wake is lost or used twice. */
  ghost predicate Inv(e: Event) {
    && |e.waiters| <= 1
    && -|e.waiters| <= e.counter
    && (forall t | Queued(e, t) :: e.counter == -1)
    && e.counter == e.wakes - e.starts + e.expired
    && e.wakes == e.granted + e.counter + |e.waiters|
  }

  lemma OnlyWaiter(m: map<Thread, Waiter>, t: Thread)
    requires |m| <= 1 && t in m
    ensures m == map[t := m[t]] && |m| == 1 && m - {t} == map[]
  {
    assert |m.Keys - {t}| == |m.Keys| - 1;
    assert m.Keys - {t} == {};
  }

  lemma SettleKeepsInv(e: Event, t: Thread, timed: bool, elapsed: bool)
    requires e.waiters.Keys <= {t} && -1 <= e.counter && !Queued(e, t)
    requires e.counter == e.wakes - e.starts + e.expired && e.wakes == e.granted + e.counter + 1
    ensures Inv(Settle(e, t, timed, elapsed))
  {
    assert e.waiters - {t} == map[];
    assert e.waiters[t := Waiter(timed, true)] == map[t := Waiter(timed, true)];
  }

  lemma WakeKeepsInv(e: Event, chosen: Option<Thread>)
    requires Inv(e) && MayNotify(e, chosen)
    ensures Inv(Apply(e, Wake(chosen)))
  {
    var e' := Apply(e, Wake(chosen));
    if chosen.Some? {
      var t := chosen.value;
      OnlyWaiter(e.waiters, t);
      assert e'.waiters == map[t := Waiter(e.waiters[t].timed, false)];
    } else {
      forall t | Queued(e', t) ensures Queued(e, t) {}
    }
  }

  lemma SpuriousKeepsInv(e: Event, t: Thread)
    requires Inv(e) && Queued(e, t)
    ensures Inv(Apply(e, Spurious(t)))
  {
    OnlyWaiter(e.waiters, t);
    assert Apply(e, Spurious(t)).waiters == map[t := Waiter(e.waiters[t].timed, false)];
  }

  lemma StartKeepsInv(e: Event, t: Thread, timed: bool, elapsed: bool)
    requires Inv(e) && e.waiters == map[]
    ensures Inv(Apply(e, Start(t, timed, elapsed)))
  {
    hide Settle;
    SettleKeepsInv(e.(counter := e.counter - 1, starts := e.starts + 1), t, timed, elapsed);
  }

  lemma RecheckKeepsInv(e: Event, t: Thread, elapsed: bool)
    requires Inv(e) && Enabled(e, Recheck(t, elapsed))
    ensures Inv(Apply(e, Recheck(t, elapsed)))
  {
    hide Settle;
    OnlyWaiter(e.waiters, t);
    SettleKeepsInv(e, t, e.waiters[t].timed, elapsed);
  }

  lemma StepKeepsInv(e: Event, s: Step)
    requires Inv(e) && Enabled(e, s) && (s.Start? ==> e.waiters == map[])
    ensures Inv(Apply(e, s))
  {
    hide Inv, Apply, MayNotify;
    match s
    case Start(t, timed, elapsed) => StartKeepsInv(e, t, timed, elapsed);
    case Recheck(t, elapsed) => RecheckKeepsInv(e, t, elapsed);
    case Spurious(t) => SpuriousKeepsInv(e, t);
    case Wake(chosen) => WakeKeepsInv(e, chosen);
  }

  lemma IdleInv()
    ensures Inv(IDLE)
  {}

  lemma {:induction false} RunKeepsInv(states: seq<Event>, steps: seq<Step>, i: nat)
    requires IsRun(states, steps, 1) && i < |states|
    ensures Inv(states[i])
  {
    if i > 0 {
      RunKeepsInv(states, steps, i - 1);
      StepKeepsInv(states[i - 1], steps[i - 1]);
    }
  }

  /**
   * With one waiter at most, over every interleaving: waits that returned 0 never exceed wakes, the counter never
   * falls below -1, and it counts exactly wakes less waits plus timeouts.
   */
  lemma CounterConserved(states: seq<Event>, steps: seq<Step>, i: nat)
    requires IsRun(states, steps, 1) && i < |states|
    ensures states[i].counter >= -1
    ensures states[i].counter == states[i].wakes - states[i].starts + states[i].expired
    ensures states[i].granted <= states[i].wakes
    ensures states[i].waiters == map[] ==> states[i].wakes == states[i].granted + states[i].counter
  {
    RunKeepsInv(states, steps, i);
  }

  /** A wake always releases the waiter: it leaves the queue, and its next look at the counter returns 0. */
  lemma WakeReleasesWaiter(e: Event, t: Thread, chosen: Option<Thread>, elapsed: bool)
    requires Inv(e) && t in e.waiters && MayNotify(e, chosen)
    ensures var e' := Apply(e, Wake(chosen));
            && Enabled(e', Recheck(t, elapsed))
            && Apply(e', Recheck(t, elapsed)).granted == e.granted + 1
            && Apply(e', Recheck(t, elapsed)).waiters == map[]
  {
    OnlyWaiter(e.waiters, t);
    if Queued(e, t) {
      assert chosen.Some?;
      OnlyWaiter(e.waiters, chosen.value);
    }
    var e' := Apply(e, Wake(chosen));
    assert e'.waiters - {t} == map[];
  }

  // ---- Which waits can time out ----

  /** Whether the last wait that a thread started has a timeout. */
  ghost function LastTimed(steps: seq<Step>, t: Thread): Option<bool> {
    if steps == [] then None
    else
      var s := steps[|steps| - 1];
      if s.Start? && s.t == t then Some(s.timed) else LastTimed(steps[..|steps| - 1], t)
  }

  /** Only the start of a wait decides whether it has a timeout; nothing that happens to the waiter changes that. */
  lemma TimedAfter(e: Event, s: Step, t: Thread)
    requires Enabled(e, s) && t in Apply(e, s).waiters
    ensures if s.Start? && s.t == t then Apply(e, s).waiters[t].timed == s.timed
            else t in e.waiters && Apply(e, s).waiters[t].timed == e.waiters[t].timed
  {}

  /** Over every run, with any number of waiters, each is timed exactly when its own last wait was started so. */
  lemma {:induction false} TimedAsStarted(states: seq<Event>, steps: seq<Step>, n: nat, i: nat, t: Thread)
    requires IsRun(states, steps, n) && i < |states| && t in states[i].waiters
    ensures LastTimed(steps[..i], t) == Some(states[i].waiters[t].timed)
  {
    hide Apply;
    if i > 0 {
      var s := steps[i - 1];
      assert Enabled(states[i - 1], s) && states[i] == Apply(states[i - 1], s);
      TimedAfter(states[i - 1], s, t);
      assert steps[..i][..i - 1] == steps[..i - 1];
      if !(s.Start? && s.t == t) { TimedAsStarted(states, steps, n, i - 1, t); }
    }
  }

  /**
   * At its next look a waiter returns 0 when the counter lets it; if not, it times out exactly when its time is up and
   * its wait was started with a timeout, and then resets the counter; and otherwise it goes back to sleep.
   */
  lemma LookOutcome(states: seq<Event>, steps: seq<Step>, n: nat, i: nat, t: Thread, elapsed: bool)
    requires IsRun(states, steps, n) && i < |states| && Enabled(states[i], Recheck(t, elapsed))
    ensures var e, e' := states[i], Apply(states[i], Recheck(t, elapsed));
            if e.counter >= 0 then
              e' == e.(waiters := e.waiters - {t}, granted := e.granted + 1)
            else if elapsed && LastTimed(steps[..i], t) == Some(true) then
              e' == e.(waiters := e.waiters - {t}, counter := 0, expired := e.expired + 1)
            else
              Queued(e', t) && e'.counter == e.counter && e'.waiters.Keys == e.waiters.Keys
              && e'.granted == e.granted && e'.expired == e.expired
  {
    hide IsRun, LastTimed;
    TimedAsStarted(states, steps, n, i, t);
  }

  // ---- How many waiters are too many ----

  ghost predicate NeverForgets(n: nat) {
    forall states, steps, i: nat | IsRun(states, steps, n) && i < |states| :: NobodyForgotten(states[i])
  }

  /** Two plain waits answered by two wakes: only the second wake notifies, so one waiter sleeps on at counter 0. */
  lemma TwoWaitersForget()
    ensures !NeverForgets(2)
  {
    var w := Waiter(false, true);
    var s0 := IDLE;
    var s1 := Event(-1, map[0 := w], 1, 0, 0, 0);
    var s2 := Event(-2, map[0 := w, 1 := w], 2, 0, 0, 0);
    var s3 := Event(-1, map[0 := w, 1 := w], 2, 1, 0, 0);
    var s4 := Event(0, map[0 := Waiter(false, false), 1 := w], 2, 2, 0, 0);
    var states := [s0, s1, s2, s3, s4];
    var steps := [Start(0, false, false), Start(1, false, false), Wake(None), Wake(Some(0))];
    assert Apply(s0, steps[0]) == s1;
    assert Apply(s1, steps[1]) == s2;
    assert Apply(s2, steps[2]) == s3;
    assert Queued(s3, 0);
    assert Apply(s3, steps[3]) == s4;
    assert IsRun(states, steps, 2);
    assert Queued(states[4], 1);
  }

  lemma MoreWaitersMoreRuns(m: nat, n: nat)
    requires m <= n && NeverForgets(n)
    ensures NeverForgets(m)
  {
    forall states, steps, i: nat | IsRun(states, steps, m) && i < |states|
      ensures NobodyForgotten(states[i])
    {
      assert IsRun(states, steps, n);
    }
  }

  /** The event never forgets a sleeper exactly when at most one wait is outstanding at a time. */
  lemma NeverForgetsIff(n: nat)
    ensures NeverForgets(n) <==> n <= 1
  {
    if n <= 1 {
      forall states, steps, i: nat | IsRun(states, steps, 1) && i < |states|
        ensures NobodyForgotten(states[i])
      {
        RunKeepsInv(states, steps, i);
      }
      MoreWaitersMoreRuns(n, 1);
    } else {
      TwoWaitersForget();
      if NeverForgets(n) { MoreWaitersMoreRuns(2, n); }
    }
  }
}
